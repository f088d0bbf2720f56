/** Firing transitions while keeping track of the enabled ones, and emptying a siphon. */
module Witnesses {
  import opened Allocations
  import opened Cnf
  import opened Formulas
  import opened InitialSiphons
  import opened Lists
  import opened PetriNets
  import opened SiphonTraps

  // ---------- the effect of a transition ----------

  ghost function Effect(net: Net, t: nat, p: nat): int
    requires t < |net.pre| && t < |net.post|
  {
    Weight(net.post[t], p) - Weight(net.pre[t], p)
  }

  ghost predicate IsChange(net: Net, t: nat, c: map<nat, int>) {
    && t < |net.pre| && t < |net.post|
    && (forall p :: p in c ==> p < net.places && c[p] == Effect(net, t, p) != 0)
    && (forall p: nat :: p < net.places && Effect(net, t, p) != 0 ==> p in c)
  }

  // ---------- the set of enabled transitions ----------

  ghost function EnabledSet(net: Net, m: seq<nat>): set<nat> {
    set t: nat | t < |net.pre| && Enabled(net, m, t)
  }

  lemma TactExact(net: Net, m: seq<nat>, tact: set<nat>)
    requires tact == EnabledSet(net, m)
    ensures forall t: nat :: t in tact <==> Enabled(net, m, t)
  {
  }

  /** The recorded transitions after the places below k have been looked at. */
  ghost predicate Adapting(net: Net, m: seq<nat>, m': seq<nat>, tact: set<nat>, k: nat)
    requires |m| == |m'|
  {
    && (forall t :: t in tact ==> t < |net.pre| && (Enabled(net, m, t) || Enabled(net, m', t)))
    && (forall t: nat :: Enabled(net, m', t) && Enabled(net, m, t) ==> t in tact)
    && (forall t: nat, p: nat :: Enabled(net, m', t) && p in net.pre[t] && p < k && p < |m| && m'[p] > m[p] ==>
        t in tact)
    && (forall t, p :: t in tact && t < |net.pre| && p in net.pre[t] && p < k && p < |m| && m'[p] < m[p] ==>
        net.pre[t][p] <= m'[p])
  }

  /** What looking at place p does to the recorded transitions. */
  ghost predicate Adapted(net: Net, m': seq<nat>, tact: set<nat>, tact': set<nat>, p: nat, delta: int)
    requires p < |m'|
  {
    if delta < 0 then
      forall t: nat :: t in tact' <==> t in tact && !(t < |net.pre| && p in net.pre[t] && m'[p] < net.pre[t][p])
    else if delta > 0 then
      forall t: nat :: t in tact' <==> t in tact || (t < |net.pre| && p in net.pre[t] && Enabled(net, m', t))
    else tact' == tact
  }

  lemma AdaptStep(net: Net, m: seq<nat>, m': seq<nat>, tact: set<nat>, tact': set<nat>, p: nat)
    requires |m| == |m'| && p < |m| && Adapting(net, m, m', tact, p)
    requires Adapted(net, m', tact, tact', p, m'[p] as int - m[p] as int)
    ensures Adapting(net, m, m', tact', p + 1)
  {
    if m'[p] < m[p] {
      forall t: nat | Enabled(net, m', t) && t in tact ensures t in tact' { }
    }
  }

  lemma AdaptStart(net: Net, m: seq<nat>, m': seq<nat>, tact: set<nat>)
    requires |m| == |m'| && tact == EnabledSet(net, m)
    ensures Adapting(net, m, m', tact, 0)
  {
  }

  /** After all places have been looked at the recorded transitions are the enabled ones. */
  lemma AdaptEnd(net: Net, m: seq<nat>, m': seq<nat>, tact: set<nat>)
    requires WellFormedNet(net) && |m| == |m'| == net.places && Adapting(net, m, m', tact, net.places)
    ensures tact == EnabledSet(net, m')
  {
    forall t: nat ensures t in tact <==> t in EnabledSet(net, m') {
      if Enabled(net, m', t) && !Enabled(net, m, t) {
        var p :| p in net.pre[t] && !(p < |m| && net.pre[t][p] <= m[p]);
        assert m'[p] > m[p];
      }
      if t in tact && Enabled(net, m, t) {
        forall p | p in net.pre[t] ensures p < |m'| && net.pre[t][p] <= m'[p] {
          assert p < |m| && net.pre[t][p] <= m[p];
        }
      }
    }
  }

  // ---------- the recorded state ----------

  ghost predicate PresetsOK(net: Net, pre: map<nat, map<nat, nat>>) {
    forall t: nat :: t in pre ==> t < |net.pre| && pre[t] == net.pre[t]
  }

  ghost predicate AllPresets(net: Net, pre: map<nat, map<nat, nat>>) {
    forall t: nat :: t < |net.pre| ==> t in pre && pre[t] == net.pre[t]
  }

  ghost predicate ChangesOK(net: Net, change: map<nat, map<nat, int>>) {
    forall t: nat :: t in change ==> IsChange(net, t, change[t])
  }

  /** fseq is a firing sequence that leads from the initial marking to am. */
  ghost predicate Recorded(net: Net, trace: seq<seq<nat>>, fseq: seq<nat>, am: seq<nat>)
    requires WellFormedNet(net)
  {
    Trace(net, trace, fseq) && trace[0] == net.m0 && trace[|fseq|] == am
  }

  lemma RecordMore(net: Net, trace: seq<seq<nat>>, fseq: seq<nat>, am: seq<nat>, t: nat)
    requires WellFormedNet(net) && Recorded(net, trace, fseq, am) && Enabled(net, am, t)
    ensures Recorded(net, trace + [Fire(net, am, t)], fseq + [t], Fire(net, am, t))
  {
    EnabledInRange(net, am, t);
    hide Enabled;
    var trace', fseq' := trace + [Fire(net, am, t)], fseq + [t];
    forall i | 0 <= i < |fseq'| ensures Step(net, trace'[i], fseq'[i], trace'[i + 1]) {
      if i < |fseq| {
        assert Step(net, trace[i], fseq[i], trace[i + 1]);
      } else {
        assert trace'[i] == am;
      }
    }
  }

  /** The summed effect of a firing sequence on place p. */
  ghost function Effects(net: Net, fseq: seq<nat>, p: nat): int
    requires forall i :: 0 <= i < |fseq| ==> fseq[i] < |net.pre| && fseq[i] < |net.post|
  {
    if fseq == [] then 0 else Effects(net, fseq[..|fseq| - 1], p) + Effect(net, fseq[|fseq| - 1], p)
  }

  /** The state equation: the marking is the initial one plus the summed effects. */
  lemma {:induction false} StateEquation(net: Net, trace: seq<seq<nat>>, fseq: seq<nat>, am: seq<nat>)
    requires WellFormedNet(net) && Recorded(net, trace, fseq, am)
    ensures |am| == net.places
    ensures forall i :: 0 <= i < |fseq| ==> fseq[i] < |net.pre| && fseq[i] < |net.post|
    ensures forall p: nat :: p < net.places ==> am[p] == net.m0[p] + Effects(net, fseq, p)
  {
    if fseq != [] {
      var k := |fseq| - 1;
      assert Step(net, trace[k], fseq[k], trace[k + 1]);
      assert Trace(net, trace[..k + 1], fseq[..k]) by {
        forall i | 0 <= i < k ensures Step(net, trace[..k + 1][i], fseq[..k][i], trace[..k + 1][i + 1]) {
          assert Step(net, trace[i], fseq[i], trace[i + 1]);
        }
      }
      StateEquation(net, trace[..k + 1], fseq[..k], trace[k]);
      forall i | 0 <= i < |fseq| ensures fseq[i] < |net.pre| && fseq[i] < |net.post| {
        if i < k { assert fseq[..k][i] == fseq[i]; }
      }
    }
  }

  // ---------- emptying a siphon ----------

  /** Transitions that share an input place have the same input places. */
  ghost predicate FreeChoice(net: Net) {
    forall t: nat, u: nat, p :: t < |net.pre| && u < |net.pre| && p in net.pre[t] && p in net.pre[u] ==>
      net.pre[t].Keys == net.pre[u].Keys
  }

  /** The node holds a siphon, its maximal trap, and (once computed) an allocation. */
  ghost predicate NodeOK(net: Net, siphon: set<nat>, maxtrap: set<nat>, alloc: map<nat, nat>, order: seq<nat>,
                         postsiphon: map<nat, nat>) {
    && (forall p :: p in siphon ==> p < net.places)
    && MaximalTrap(net, siphon, maxtrap) && PostsetOK(net, siphon, postsiphon)
    && (alloc == map[] || TotalAllocation(net, siphon, maxtrap, alloc, order))
  }

  /** Transitions that share an input place have the same presets, weights included. */
  ghost predicate EqualPresets(net: Net) {
    forall t: nat, u: nat, p :: t < |net.pre| && u < |net.pre| && p in net.pre[t] && p in net.pre[u] ==>
      net.pre[t] == net.pre[u]
  }

  /** Of two transitions that share an input place, an enabled one can be replaced by the other. */
  ghost predicate Replaceable(net: Net) {
    forall m, t: nat, u: nat, p |
      && |m| == net.places && t < |net.pre| && u < |net.pre|
      && p in net.pre[t] && p in net.pre[u] && Enabled(net, m, t) :: Enabled(net, m, u)
  }

  /** The marking that holds exactly what the arcs take. */
  ghost function Exactly(arcs: map<nat, nat>, n: nat): (m: seq<nat>)
    ensures |m| == n && forall p :: 0 <= p < n ==> m[p] == Weight(arcs, p)
  {
    seq(n, p requires 0 <= p => Weight(arcs, p))
  }

  lemma EnabledAtExactly(net: Net, t: nat, u: nat)
    requires WellFormedNet(net) && t < |net.pre| && u < |net.pre|
    ensures Enabled(net, Exactly(net.pre[t], net.places), t)
    ensures Enabled(net, Exactly(net.pre[t], net.places), u) ==>
              forall p :: p in net.pre[u] ==> p in net.pre[t] && net.pre[u][p] <= net.pre[t][p]
  {
  }

  /** Replacing enabled transitions works in all markings exactly if transitions that share
      an input place have equal presets; free choice alone says so of the places only. */
  lemma ReplaceableExact(net: Net)
    requires WellFormedNet(net)
    ensures EqualPresets(net) <==> Replaceable(net)
  {
    hide WellFormedNet;
    if Replaceable(net) {
      hide Enabled;
      forall t: nat, u: nat, p | t < |net.pre| && u < |net.pre| && p in net.pre[t] && p in net.pre[u]
        ensures net.pre[t] == net.pre[u]
      {
        EnabledAtExactly(net, t, u);
        EnabledAtExactly(net, u, t);
        assert Enabled(net, Exactly(net.pre[t], net.places), u);
        assert Enabled(net, Exactly(net.pre[u], net.places), t);
        assert net.pre[t].Keys == net.pre[u].Keys;
      }
    }
  }

  /** Transitions that share an input place take the same number from every common place. */
  ghost predicate SameWeights(net: Net) {
    forall t: nat, u: nat, p, q |
      && t < |net.pre| && u < |net.pre| && p in net.pre[t] && p in net.pre[u]
      && q in net.pre[t] && q in net.pre[u] :: net.pre[t][q] == net.pre[u][q]
  }

  /** In a free-choice net this is a condition on the weights alone, met by ordinary nets. */
  lemma EqualPresetsByWeight(net: Net)
    ensures EqualPresets(net) <==> FreeChoice(net) && SameWeights(net)
    ensures Ordinary(net) ==> SameWeights(net)
  {
    if FreeChoice(net) && SameWeights(net) {
      forall t: nat, u: nat, p | t < |net.pre| && u < |net.pre| && p in net.pre[t] && p in net.pre[u]
        ensures net.pre[t] == net.pre[u]
      {
        assert net.pre[t].Keys == net.pre[u].Keys;
      }
    }
  }

  /** The allocated transition that replaces an enabled one is enabled too. */
  lemma AllocatedIsEnabled(net: Net, siphon: set<nat>, maxtrap: set<nat>, alloc: map<nat, nat>, order: seq<nat>,
                           m: seq<nat>, t: nat, p: nat)
    requires WellFormedNet(net) && EqualPresets(net)
    requires TotalAllocation(net, siphon, maxtrap, alloc, order) && p in alloc
    requires Enabled(net, m, t) && p in net.pre[t]
    ensures Enabled(net, m, alloc[p])
  {
    assert p in order;
    var r :| 0 <= r < |order| && order[r] == p;
    assert AllocatedAt(net, siphon, alloc[p], p, order[..r]);
    assert net.pre[alloc[p]] == net.pre[t];
  }

  /** Transition 0 takes two tokens from the only place, transition 1 takes one. */
  ghost function UnequalWeights(): Net {
    Net(1, [map[0 := 2], map[0 := 1]], [map[], map[]], [1])
  }

  /** With weighted arcs free choice is not enough: a total allocation may replace an
      enabled transition by one that is not enabled. */
  lemma WeightsMatter()
    ensures var net, alloc := UnequalWeights(), map[0 := 0];
            && WellFormedNet(net) && FreeChoice(net) && MaximalTrap(net, {0}, {})
            && TotalAllocation(net, {0}, {}, alloc, [0])
            && Enabled(net, net.m0, 1) && 0 in net.pre[1] && !Enabled(net, net.m0, alloc[0])
  {
    var net := UnequalWeights();
    assert net.pre[0].Keys == net.pre[1].Keys == {0};
    assert 0 in net.pre[0] && net.pre[0][0] == 2 > net.m0[0];
    forall Q: set<nat> | Q <= {0} && Trap(net, Q) ensures Q == {} {
      assert !Meets(net.post[0], Q);
      MemberMeets(net.pre[0], Q, 0);
    }
  }

  /** The input place of an enabled transition is marked, hence not in an unmarked trap. */
  lemma PlaceIsAllocated(net: Net, siphon: set<nat>, maxtrap: set<nat>, postsiphon: map<nat, nat>, m: seq<nat>, t: nat)
    requires WellFormedNet(net) && PostsetOK(net, siphon, postsiphon) && !MarkedAt(m, maxtrap)
    requires t in postsiphon && Enabled(net, m, t)
    ensures t < |net.pre| && postsiphon[t] in siphon - maxtrap && postsiphon[t] in net.pre[t]
  {
    var p := postsiphon[t];
    assert p in net.pre[t] && p < |m| && m[p] >= net.pre[t][p] >= 1;
  }

  lemma TotalKeys(net: Net, siphon: set<nat>, maxtrap: set<nat>, alloc: map<nat, nat>, order: seq<nat>)
    requires TotalAllocation(net, siphon, maxtrap, alloc, order)
    ensures alloc.Keys == siphon - maxtrap
  {
  }

  lemma NoneActivated(net: Net, siphon: set<nat>, postsiphon: map<nat, nat>, m: seq<nat>)
    requires PostsetOK(net, siphon, postsiphon)
    requires forall t: nat :: t in postsiphon && t < |net.pre| ==> LacksIn(net, siphon, m, t)
    ensures SiphonBlocks(net, siphon, m)
  {
    hide LacksIn, Meets;
  }

  lemma SomeActivated(net: Net, siphon: set<nat>, postsiphon: map<nat, nat>, m: seq<nat>, wact: set<nat>)
    requires PostsetOK(net, siphon, postsiphon) && wact != {}
    requires forall t: nat :: t in wact ==> t in postsiphon && (t < |net.pre| ==> !LacksIn(net, siphon, m, t))
    ensures exists t: nat :: t in postsiphon && t < |net.pre| && !LacksIn(net, siphon, m, t)
    ensures !SiphonBlocks(net, siphon, m)
  {
    hide LacksIn, Meets;
    var t :| t in wact;
    assert t in postsiphon;
  }

  lemma RecordedRuns(net: Net, trace: seq<seq<nat>>, fseq: seq<nat>, am: seq<nat>)
    requires WellFormedNet(net) && Recorded(net, trace, fseq, am)
    ensures Runs(net, net.m0, fseq, am)
  {
    hide Trace;
  }

  /** No transition of the siphon's postset is enabled in any marking reachable from m. */
  ghost predicate DeadForGood(net: Net, siphon: set<nat>, m: seq<nat>)
    requires WellFormedNet(net)
  {
    forall later, m', t: nat :: Runs(net, m, later, m') && t < |net.pre| && Meets(net.pre[t], siphon) ==>
      !Enabled(net, m', t)
  }

  datatype Outcome = Restart | Emptied | Blocked

  class Witness {
    const net: Net
    const init: WNode
    var am: seq<nat>
    var tact: set<nat>
    var fseq: seq<nat>
    var res: set<nat>
    var pre: map<nat, map<nat, nat>>
    var change: map<nat, map<nat, int>>
    ghost var trace: seq<seq<nat>>

    /** The enabled transitions are known, and fseq is a run to the marking am. */
    ghost predicate Valid()
      reads this
    {
      && WellFormedNet(net) && |am| == net.places
      && AllPresets(net, pre) && PresetsOK(net, pre) && ChangesOK(net, change)
      && tact == EnabledSet(net, am)
      && Recorded(net, trace, fseq, am)
    }

    constructor (net: Net)
      requires WellFormedNet(net)
      ensures Valid() && this.net == net && am == net.m0 && fseq == []
      ensures res == {} && fresh(init) && init.net == net && init.P == None && init.alloc == map[]
    {
      this.net := net;
      init := new WNode(net, None);
      am, tact, fseq, res, pre, change, trace := net.m0, {}, [], {}, map[], map[], [net.m0];
      new;
      for t := 0 to |net.pre|
        modifies this`tact, this`pre
        invariant PresetsOK(net, pre) && forall u: nat :: u < t ==> u in pre
        invariant forall u: nat :: u in tact <==> u < t && Enabled(net, am, u)
      {
        var b := IsActivated(t);
        if b {
          tact := tact + {t};
        }
      }
      assert Recorded(net, trace, fseq, am);
    }

    /** Gives the initial node the set S, its maximal trap, an allocation and its postset;
        false if S is not a siphon without initially marked trap. */
    method InitSWOMT(minisat: Solver, S: set<nat>) returns (ok: bool)
      requires Valid() && init.net == net && ExactSolver(minisat) && forall p :: p in S ==> p < net.places
      modifies init
      ensures Valid() && init.P == old(init.P)
      ensures ok <==> WithoutMarkedTrap(net, S)
      ensures ok ==> init.siphon == S && !MarkedAt(net.m0, init.maxtrap)
      ensures ok ==> NodeOK(net, init.siphon, init.maxtrap, init.alloc, init.order, init.postsiphon)
      ensures ok ==> TotalAllocation(net, init.siphon, init.maxtrap, init.alloc, init.order)
    {
      hide Recorded, ChangesOK, EnabledSet, ExactSolver, Sat, CheckClauses, MaximalTrap, MarkedAt, WithoutMarkedTrap,
        TotalAllocation, PostsetOK, SetVal;
      var f := new Formula(net, minisat);
      var X, Y := BuildCheck(f, S);
      CheckExact(net, 1, S);
      var b := f.Solve();
      if !b {
        assert Unsatisfiable(f.f);
        return false;
      }
      ModelShowsTrap(net, 1, S, f.mssolution);
      init.siphon := f.GetAssignment(X);
      init.maxtrap := f.GetAssignment(Y);
      init.ComputeAllocation();
      init.ComputeSiphonPostset();
      return true;
    }

    /** Whether t can fire; its preset is recorded at the first call. */
    method IsActivated(t: nat) returns (b: bool)
      requires WellFormedNet(net) && t < |net.pre| && |am| == net.places && PresetsOK(net, pre)
      modifies this`pre
      ensures PresetsOK(net, pre) && pre.Keys == old(pre.Keys) + {t}
      ensures b <==> Enabled(net, am, t)
    {
      if t !in pre {
        var tpre: map<nat, nat> := map[];
        for p := 0 to net.places
          invariant forall q :: q in tpre <==> q < p && q in net.pre[t]
          invariant forall q :: q in tpre ==> tpre[q] == net.pre[t][q]
        {
          if p in net.pre[t] {
            tpre := tpre[p := net.pre[t][p]];
          }
        }
        assert tpre == net.pre[t];
        pre := pre[t := tpre];
      }
      for p := 0 to net.places
        invariant forall q :: q in pre[t] && q < p ==> pre[t][q] <= am[q]
      {
        if p in pre[t] {
          if pre[t][p] > am[p] {
            return false;
          }
        }
      }
      return true;
    }

    /** Fires an enabled transition and keeps the set of enabled ones up to date. */
    method FireTransition(t: nat)
      requires Valid() && Enabled(net, am, t)
      modifies this`am, this`tact, this`fseq, this`pre, this`change, this`trace
      ensures Valid() && fseq == old(fseq) + [t] && am == Fire(net, old(am), t)
      ensures forall u: nat :: u in tact <==> Enabled(net, am, u)
    {
      hide Enabled, IsChange, Adapting, Adapted, EnabledSet, Recorded, WellFormedNet;
      ghost var m := am;
      EnabledInRange(net, am, t);
      if t !in change {
        ComputeChange(t);
      }
      ApplyChange(t);
      AdaptStart(net, m, am, tact);
      for p := 0 to net.places
        modifies this`tact, this`pre
        invariant AllPresets(net, pre) && PresetsOK(net, pre)
        invariant Adapting(net, m, am, tact, p)
      {
        ghost var before := tact;
        Adapt(t, p);
        AdaptStep(net, m, am, before, tact, p);
      }
      AdaptEnd(net, m, am, tact);
      TactExact(net, am, tact);
      RecordMore(net, trace, fseq, m, t);
      fseq := fseq + [t];
      trace := trace + [am];
    }

    /** An enabled transition of the node's siphon. */
    method FindActivated(w: WNode) returns (r: Option<nat>)
      requires Valid() && w.net == net && PostsetOK(net, w.siphon, w.postsiphon)
      ensures r.Some? ==> r.value in w.postsiphon && Enabled(net, am, r.value)
      ensures r.None? ==> forall t: nat :: t in w.postsiphon ==> !Enabled(net, am, t)
    {
      hide Enabled, Recorded, ChangesOK;
      for t := 0 to |net.pre|
        invariant forall u: nat :: u in w.postsiphon && u < t ==> !Enabled(net, am, u)
      {
        if t in w.postsiphon && t in tact {
          return Some(t);
        }
      }
      return None;
    }

    ghost predicate Ready(w: WNode)
      reads this, w
    {
      && Valid() && w.net == net && EqualPresets(net)
      && NodeOK(net, w.siphon, w.maxtrap, w.alloc, w.order, w.postsiphon) && !MarkedAt(am, w.maxtrap)
    }

    /** Fires the allocated transition in place of the enabled transition t. */
    method FireAllocated(w: WNode, t: nat) returns (u: nat)
      requires Ready(w) && t in w.postsiphon && Enabled(net, am, t)
      modifies this`am, this`tact, this`fseq, this`pre, this`change, this`trace, w`alloc, w`order
      ensures Ready(w) && TotalAllocation(net, w.siphon, w.maxtrap, w.alloc, w.order)
      ensures old(w.alloc) != map[] ==> w.alloc == old(w.alloc) && w.order == old(w.order)
      ensures Enabled(net, old(am), u) && u < |net.post| && fseq == old(fseq) + [u] && am == Fire(net, old(am), u)
      ensures w.postsiphon[t] in w.alloc && u == w.alloc[w.postsiphon[t]]
      ensures Energy(net, w.order, am) < Energy(net, w.order, old(am))
    {
      hide Enabled, Recorded, ChangesOK, EnabledSet, MaximalTrap, MarkedAt, PostsetOK, TotalAllocation, EqualPresets,
        WellFormedNet;
      PlaceIsAllocated(net, w.siphon, w.maxtrap, w.postsiphon, am, t);
      var p := w.postsiphon[t];
      if w.alloc == map[] {
        w.ComputeAllocation();
      }
      TotalKeys(net, w.siphon, w.maxtrap, w.alloc, w.order);
      u := w.alloc[p];
      AllocatedIsEnabled(net, w.siphon, w.maxtrap, w.alloc, w.order, am, t, p);
      MaximalTrapInside(net, w.siphon, w.maxtrap);
      AllocatedFiring(net, w.siphon, w.maxtrap, w.alloc, w.order, am, p);
      FireTransition(u);
    }

    /** Fires allocated transitions as long as a transition of the siphon's postset is
        enabled; every firing costs potential. Ends early once a defining place has
        received a token. */
    method FireAll(w: WNode) returns (restart: bool)
      requires Ready(w)
      modifies this`am, this`tact, this`fseq, this`pre, this`change, this`trace, w`alloc, w`order
      ensures Ready(w) && (w.alloc == map[] ==> am == old(am) && fseq == old(fseq))
      ensures old(w.alloc) != map[] ==> w.alloc == old(w.alloc) && w.order == old(w.order)
      ensures old(fseq) <= fseq
      ensures |fseq| - |old(fseq)| + Energy(net, w.order, am) <= Energy(net, w.order, old(am))
      ensures restart ==> |fseq| > |old(fseq)|
      ensures forall i :: |old(fseq)| <= i < |fseq| ==> (w.Defining(fseq[i]) <==> restart && i == |fseq| - 1)
      ensures !restart ==> forall t: nat :: t in w.postsiphon ==> !Enabled(net, am, t)
    {
      hide Enabled, Recorded, ChangesOK, EnabledSet, MaximalTrap, MarkedAt, PostsetOK, TotalAllocation, EqualPresets,
        LacksIn;
      ghost var m, n := am, |fseq|;
      while true
        invariant Ready(w) && m == old(am) && old(fseq) <= fseq && (w.alloc == map[] ==> am == m && |fseq| == n)
        invariant old(w.alloc) != map[] ==> w.alloc == old(w.alloc) && w.order == old(w.order)
        invariant forall i :: n <= i < |fseq| ==> !w.Defining(fseq[i])
        invariant |fseq| - n + Energy(net, w.order, am) <= Energy(net, w.order, m)
        decreases if w.alloc == map[] then 1 else 0, Energy(net, w.order, am)
      {
        var t := FindActivated(w);
        if t.None? {
          return false;
        }
        var u := FireAllocated(w, t.value);
        var defining := w.ProducesDefiningToken(u);
        if defining {
          return true;
        }
      }
    }

    /** Empties the node's siphon as far as possible. Restart means that a defining place
        has received a token, Emptied that the siphon itself blocks all its transitions,
        and Blocked that some of them only lack tokens outside the siphon. */
    method AdaptGraph(w: WNode) returns (o: Outcome)
      requires Ready(w)
      modifies this`am, this`tact, this`fseq, this`pre, this`change, this`trace, this`res, w`alloc, w`order
      ensures Ready(w) && (w.alloc == map[] ==> am == old(am) && fseq == old(fseq))
      ensures old(w.alloc) != map[] ==> w.alloc == old(w.alloc) && w.order == old(w.order)
      ensures old(fseq) <= fseq
      ensures |fseq| - |old(fseq)| + Energy(net, w.order, am) <= Energy(net, w.order, old(am))
      ensures o.Restart? ==> |fseq| > |old(fseq)|
      ensures forall i :: |old(fseq)| <= i < |fseq| ==> (w.Defining(fseq[i]) <==> o.Restart? && i == |fseq| - 1)
      ensures !o.Restart? ==> forall t: nat :: t in w.postsiphon ==> !Enabled(net, am, t)
      ensures res == if o.Emptied? then w.siphon else old(res)
      ensures !o.Restart? ==> (o.Emptied? <==> SiphonBlocks(net, w.siphon, am))
      ensures o.Blocked? ==> exists t: nat :: t in w.postsiphon && t < |net.pre| && !LacksIn(net, w.siphon, am, t)
    {
      hide Enabled, Recorded, ChangesOK, EnabledSet, MaximalTrap, MarkedAt, PostsetOK, TotalAllocation, EqualPresets,
        LacksIn, Energy;
      var restart := FireAll(w);
      if restart {
        return Restart;
      }
      var wact := w.GetActivated(am, pre);
      if wact == {} {
        res := w.siphon;
        NoneActivated(net, w.siphon, w.postsiphon, am);
        return Emptied;
      }
      SomeActivated(net, w.siphon, w.postsiphon, am, wact);
      return Blocked;
    }

    /** Repeats the search at the initial node until no restart is asked for. An emptied
        siphon stays dead: none of its transitions can ever fire again. */
    method ComputeGraph(w: WNode) returns (o: Outcome, run: seq<nat>, siphon: set<nat>)
      requires Ready(w) && Siphon(net, w.siphon)
      modifies this`am, this`tact, this`fseq, this`pre, this`change, this`trace, this`res, w`alloc, w`order
      ensures Ready(w) && !o.Restart? && run == fseq && siphon == res && Runs(net, net.m0, run, am)
      ensures forall t: nat :: t in w.postsiphon ==> !Enabled(net, am, t)
      ensures |fseq| - |old(fseq)| + Energy(net, w.order, am) <= Energy(net, w.order, old(am))
      ensures res == if o.Emptied? then w.siphon else old(res)
      ensures o.Emptied? <==> SiphonBlocks(net, w.siphon, am)
      ensures o.Emptied? ==> DeadForGood(net, res, am)
    {
      hide Enabled, ChangesOK, EnabledSet, MaximalTrap, MarkedAt, PostsetOK, TotalAllocation, EqualPresets, LacksIn,
        Meets, Siphon, SiphonBlocks, Runs;
      ghost var m, n := am, |fseq|;
      o := AdaptGraph(w);
      while o.Restart?
        invariant Ready(w) && |fseq| - n + Energy(net, w.order, am) <= Energy(net, w.order, m)
        invariant o.Restart? ==> w.alloc != map[]
        invariant !o.Restart? ==> forall t: nat :: t in w.postsiphon ==> !Enabled(net, am, t)
        invariant res == if o.Emptied? then w.siphon else old(res)
        invariant !o.Restart? ==> (o.Emptied? <==> SiphonBlocks(net, w.siphon, am))
        decreases o.Restart?, Energy(net, w.order, am)
      {
        o := AdaptGraph(w);
      }
      run := fseq;
      siphon := res;
      RecordedRuns(net, trace, fseq, am);
      if o.Emptied? {
        forall later, m', t: nat | Runs(net, am, later, m') && t < |net.pre| && Meets(net.pre[t], res)
          ensures !Enabled(net, m', t) {
          DeadSiphonForever(net, res, am, later, m', t);
        }
      }
    }

    /** Records the non-zero token changes of t. */
    method ComputeChange(t: nat)
      requires WellFormedNet(net) && t < |net.pre| && ChangesOK(net, change)
      modifies this`change
      ensures ChangesOK(net, change) && t in change
    {
      var tmp := SumArcs(t);
      var c: map<nat, int> := map[];
      for p := 0 to net.places
        invariant forall q :: q in c ==> q < p && c[q] == Effect(net, t, q) != 0
        invariant forall q: nat :: q < p && Effect(net, t, q) != 0 ==> q in c
      {
        if p in tmp && tmp[p] != 0 {
          c := c[p := tmp[p]];
        }
      }
      change := change[t := c];
    }

    /** The output weights minus the input weights, for all places next to t. */
    method SumArcs(t: nat) returns (tmp: map<nat, int>)
      requires WellFormedNet(net) && t < |net.pre|
      ensures forall q :: q in tmp <==> q in net.post[t] || q in net.pre[t]
      ensures forall q: nat :: q in tmp ==> tmp[q] == Effect(net, t, q)
    {
      tmp := map[];
      for p := 0 to net.places
        invariant forall q :: q in tmp <==> q < p && q in net.post[t]
        invariant forall q :: q in tmp ==> tmp[q] == Weight(net.post[t], q)
      {
        if p in net.post[t] {
          tmp := tmp[p := net.post[t][p]];
        }
      }
      for p := 0 to net.places
        invariant forall q :: q in tmp <==> q in net.post[t] || (q < p && q in net.pre[t])
        invariant forall q :: q in tmp ==>
                    tmp[q] == Weight(net.post[t], q) - if q < p then Weight(net.pre[t], q) else 0
      {
        if p in net.pre[t] {
          tmp := tmp[p := (if p in tmp then tmp[p] else 0) - net.pre[t][p]];
        }
      }
    }

    /** Changes the marking. */
    method ApplyChange(t: nat)
      requires WellFormedNet(net) && |am| == net.places && Enabled(net, am, t)
      requires t in change && IsChange(net, t, change[t])
      modifies this`am
      ensures am == Fire(net, old(am), t)
    {
      ghost var m := am;
      for p := 0 to net.places
        invariant |am| == net.places
        invariant forall q :: 0 <= q < p ==> am[q] == m[q] + Effect(net, t, q)
        invariant forall q :: p <= q < net.places ==> am[q] == m[q]
      {
        if p in change[t] {
          am := am[p := am[p] + change[t][p]];
        }
      }
    }

    /** Looks at place p after t has fired. */
    method Adapt(t: nat, p: nat)
      requires WellFormedNet(net) && |am| == net.places && p < net.places
      requires AllPresets(net, pre) && PresetsOK(net, pre) && t in change && IsChange(net, t, change[t])
      modifies this`tact, this`pre
      ensures AllPresets(net, pre) && PresetsOK(net, pre)
      ensures Adapted(net, am, old(tact), tact, p, Effect(net, t, p))
    {
      hide Enabled;
      if p in change[t] {
        if change[t][p] < 0 {
          Eliminate(p);
        } else {
          LookForNew(p);
        }
      }
    }

    /** Drops the transitions for which place p now holds too few tokens. */
    method Eliminate(p: nat)
      requires WellFormedNet(net) && |am| == net.places && p < net.places && AllPresets(net, pre)
      modifies this`tact
      ensures forall u: nat :: u in tact <==>
              u in old(tact) && !(u < |net.pre| && p in net.pre[u] && am[p] < net.pre[u][p])
    {
      for u := 0 to |net.pre|
        invariant forall v: nat :: v in tact <==> v in old(tact) && !(v < u && p in net.pre[v] && am[p] < net.pre[v][p])
      {
        if p in net.pre[u] {
          if u in tact && am[p] < pre[u][p] {
            tact := tact - {u};
          }
        }
      }
    }

    /** Adds the transitions after place p that are enabled now. */
    method LookForNew(p: nat)
      requires WellFormedNet(net) && |am| == net.places && p < net.places && AllPresets(net, pre) && PresetsOK(net, pre)
      modifies this`tact, this`pre
      ensures AllPresets(net, pre) && PresetsOK(net, pre)
      ensures forall u: nat :: u in tact <==>
              u in old(tact) || (u < |net.pre| && p in net.pre[u] && Enabled(net, am, u))
    {
      hide Enabled;
      for u := 0 to |net.pre|
        invariant AllPresets(net, pre) && PresetsOK(net, pre)
        invariant forall v: nat :: v in tact <==> v in old(tact) || (v < u && p in net.pre[v] && Enabled(net, am, v))
      {
        if p in net.pre[u] {
          if u !in tact {
            var b := IsActivated(u);
            if b {
              tact := tact + {u};
            }
          }
        }
      }
    }
  }

  /** Whether any two presets are disjoint or equal, as sets of places. */
  method IsFreeChoice(net: Net) returns (b: bool)
    ensures b <==> FreeChoice(net)
  {
    for t := 0 to |net.pre|
      invariant forall v: nat, u: nat :: v < t && u < |net.pre| ==> DisjointOrEqual(net, v, u)
    {
      for u := 0 to |net.pre|
        invariant forall v: nat :: v < u ==> DisjointOrEqual(net, t, v)
      {
        if net.pre[t].Keys != net.pre[u].Keys && net.pre[t].Keys * net.pre[u].Keys != {} {
          var p :| p in net.pre[t].Keys * net.pre[u].Keys;
          assert p in net.pre[t] && p in net.pre[u];
          return false;
        }
        assert forall p :: p in net.pre[t] && p in net.pre[u] ==> p in net.pre[t].Keys * net.pre[u].Keys;
      }
    }
    forall t: nat, u: nat, p | t < |net.pre| && u < |net.pre| && p in net.pre[t] && p in net.pre[u]
      ensures net.pre[t].Keys == net.pre[u].Keys
    {
      assert DisjointOrEqual(net, t, u);
    }
    return true;
  }

  ghost predicate DisjointOrEqual(net: Net, t: nat, u: nat)
    requires t < |net.pre| && u < |net.pre|
  {
    forall p :: p in net.pre[t] && p in net.pre[u] ==> net.pre[t].Keys == net.pre[u].Keys
  }

  datatype Answer = NotFreeChoice | NoSuchSiphon | Found(outcome: Outcome)

  /** The whole search: from a siphon without initially marked trap, a run after which
      either no transition of that siphon can ever fire again, or those that the siphon
      does not block wait for tokens from outside. */
  method FindWitness(net: Net, minisat: Solver, S: set<nat>)
    returns (r: Answer, run: seq<nat>, siphon: set<nat>, ghost m: seq<nat>)
    requires WellFormedNet(net) && ExactSolver(minisat) && (FreeChoice(net) ==> SameWeights(net))
    requires forall p :: p in S ==> p < net.places
    ensures r == NotFreeChoice <==> !FreeChoice(net)
    ensures r == NoSuchSiphon <==> FreeChoice(net) && !WithoutMarkedTrap(net, S)
    ensures r.Found? ==> Runs(net, net.m0, run, m) && !r.outcome.Restart?
    ensures r.Found? ==> forall t: nat :: t < |net.pre| && Meets(net.pre[t], S) ==> !Enabled(net, m, t)
    ensures r.Found? ==> (r.outcome.Emptied? <==> SiphonBlocks(net, S, m))
    ensures r == Found(Emptied) ==> siphon == S && DeadForGood(net, S, m)
  {
    hide Enabled, Recorded, ChangesOK, EnabledSet, ExactSolver, MaximalTrap, MarkedAt, TotalAllocation, FreeChoice,
      SameWeights, EqualPresets, Runs, Meets, SiphonBlocks;
    var free := IsFreeChoice(net);
    if !free {
      return NotFreeChoice, [], {}, [];
    }
    EqualPresetsByWeight(net);
    var w := new Witness(net);
    var ok := w.InitSWOMT(minisat, S);
    if !ok {
      return NoSuchSiphon, [], {}, [];
    }
    var outcome, fseq, emptied := w.ComputeGraph(w.init);
    return Found(outcome), fseq, emptied, w.am;
  }
}
